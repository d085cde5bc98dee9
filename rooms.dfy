/** The room record the dataset rows are read into. */
module Rooms {
  import opened Wrappers

  /** One row of the dataset. Every column is a string; a column missing from a row is the
      empty string, except `person`, which the record type itself declares optional. */
  datatype Room = Room(
    id: string,           // unique key of the row
    roomId: string,       // the displayed room code
    aliases: string,      // alternative names separated by '|'
    floor: string,        // "0" is the ground floor
    tags: string,
    mapImage: string,
    category: string,
    description: string,  // free text holding the directions mini-format
    building: string,
    roomType: string,
    person: Option<string> // occupants separated by '|'
  )

  /** `value || ''` for an optional string. */
  function OrEmpty(o: Option<string>): (s: string)
    ensures o.Some? ==> s == o.value
    ensures o.None? ==> s == ""
  {
    match o
    case Some(v) => v
    case None => ""
  }
}
