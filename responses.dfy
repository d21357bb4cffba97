/** What a handler sends back: an HTTP status and the JSON body, by shape. */
module Responses {
  import opened Fields
  import opened BookingModel
  import opened CreditModel
  import opened HistoryModel
  import opened Statistics

  datatype Body =
    | Created(message: string, booking: Booking)               // `{ message, booking }`
    | BookingBody(booking: Booking)                           // one row
    | BookingList(bookings: seq<Booking>)                     // an array of rows
    | BookingsAndStats(bookings: seq<Booking>, stats: seq<nat>)  // `{ bookings, stats }`
    | HistoryBody(entry: HistoryEntry)                        // one row
    | HistoryList(rows: seq<HistoryEntry>)                    // an array of rows
    | HistoryObject(history: seq<HistoryEntry>)               // `{ history }`
    | CreditsAndStats(credits: seq<Credit>, usage: seq<UsageStat>)  // `{ credits, stats }`
    | Error(error: string)                                    // `{ error }` with a fixed text
    | Invalid(errors: seq<FieldError>)                        // `{ error: error.message }` of a validation error
    | Message(message: string)                                // `{ message }`
    | NoContent                                               // an empty 204

  datatype Response = Response(status: nat, body: Body)
}
