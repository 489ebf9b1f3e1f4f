/** The in-memory room store of the models package: one map from room ID to
    room. Each method is one atomic step (the read-write mutex is not modelled). */
module Rooms {
  import opened Wrappers

  /** A chat room. `createdAt` is an opaque timestamp. */
  datatype Room = Room(id: string, name: string, createdAt: int)

  /** Every room is stored under its own ID (`rooms[room.ID] = room`). */
  ghost predicate Keyed(rooms: map<string, Room>)
  {
    forall id :: id in rooms ==> rooms[id].id == id
  }

  predicate DistinctIds(list: seq<Room>)
  {
    forall i, j :: 0 <= i < j < |list| ==> list[i].id != list[j].id
  }

  class RoomStore {
    var rooms: map<string, Room>

    ghost predicate Valid()
      reads this
    {
      Keyed(rooms)
    }

    /** `NewRoomStore`: no rooms. */
    constructor ()
      ensures rooms == map[] && Valid()
    {
      rooms := map[];
    }

    /** `GetRooms`: every stored room exactly once, in map order. */
    method GetRooms() returns (r: seq<Room>)
      requires Valid()
      ensures |r| == |rooms|
      ensures forall i :: 0 <= i < |r| ==> r[i].id in rooms && rooms[r[i].id] == r[i]
      ensures DistinctIds(r)
      ensures forall id :: id in rooms ==> rooms[id] in r
    {
      r := [];
      var pending := rooms.Keys;
      while pending != {}
        invariant pending <= rooms.Keys
        invariant forall i :: 0 <= i < |r| ==> r[i].id in rooms && r[i].id !in pending && rooms[r[i].id] == r[i]
        invariant DistinctIds(r)
        invariant forall id :: id in rooms && id !in pending ==> rooms[id] in r
        invariant |r| + |pending| == |rooms|
        decreases pending
      {
        var id :| id in pending;
        r := r + [rooms[id]];
        pending := pending - {id};
      }
    }

    /** `GetRoom`: Go's `room, exists := s.rooms[id]`; an unknown ID reads as `(nil, false)`. */
    function GetRoom(id: string): (r: Option<Room>)
      reads this
      ensures r.Some? <==> id in rooms
      ensures r.Some? ==> r.value == rooms[id]
    {
      if id in rooms then Some(rooms[id]) else None
    }

    /** `AddRoom`: store the room under its ID, replacing any room stored there. */
    method AddRoom(room: Room)
      modifies this
      ensures rooms == old(rooms)[room.id := room]
      ensures GetRoom(room.id) == Some(room)
      ensures forall id :: id != room.id ==> GetRoom(id) == old(GetRoom(id))
      ensures old(Valid()) ==> Valid()
    {
      rooms := rooms[room.id := room];
    }

    /** `UpdateRoom`: replace the room stored under `room.ID` only if there is one. */
    method UpdateRoom(room: Room) returns (updated: bool)
      modifies this
      ensures updated == (room.id in old(rooms))
      ensures !updated ==> rooms == old(rooms)
      ensures updated ==> rooms.Keys == old(rooms).Keys && rooms[room.id] == room
      ensures forall id :: id != room.id ==> GetRoom(id) == old(GetRoom(id))
      ensures old(Valid()) ==> Valid()
    {
      if room.id !in rooms {
        return false;
      }
      rooms := rooms[room.id := room];
      return true;
    }

    /** `DeleteRoom`: remove the ID only if it is stored. */
    method DeleteRoom(id: string) returns (deleted: bool)
      modifies this
      ensures deleted == (id in old(rooms))
      ensures rooms == old(rooms) - {id}
      ensures !deleted ==> rooms == old(rooms)
      ensures GetRoom(id) == None
      ensures forall other :: other != id ==> GetRoom(other) == old(GetRoom(other))
      ensures old(Valid()) ==> Valid()
    {
      if id !in rooms {
        return false;
      }
      rooms := rooms - {id};
      return true;
    }
  }
}
